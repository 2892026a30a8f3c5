/**
 * The schema of the attendance application: users with a role tag,
 * departments, subjects, student profiles, attendance sessions and
 * attendance records, held as auto-numbered tables. `Valid` collects the
 * constraints the relational store enforces (foreign keys resolve, the
 * unique columns and the two unique_together pairs), and the module ends
 * with the attendance percentage of a student.
 */
module Models {

  datatype Option<T> = None | Some(value: T)

  type UserId = nat
  type DepartmentId = nat
  type SubjectId = nat
  type StudentId = nat
  type SessionId = nat
  type RecordId = nat

  // The three role tags a user may carry; the column itself is free text.
  const ADMIN: string := "ADMIN"
  const TEACHER: string := "TEACHER"
  const STUDENT: string := "STUDENT"

  datatype User = User(username: string, role: string)
  {
    predicate IsAdminUser() { role == ADMIN }
    predicate IsTeacher() { role == TEACHER }
    predicate IsStudentUser() { role == STUDENT }
  }

  /** At most one role property holds, and exactly one for a defined role. */
  lemma RolePropertiesExclusive(u: User)
    ensures !(u.IsAdminUser() && u.IsTeacher())
    ensures !(u.IsAdminUser() && u.IsStudentUser())
    ensures !(u.IsTeacher() && u.IsStudentUser())
    ensures u.role in {ADMIN, TEACHER, STUDENT} <==> (u.IsAdminUser() || u.IsTeacher() || u.IsStudentUser())
  {
  }

  datatype Date = Date(year: int, month: int, day: int)

  // A record's status column admits exactly these two values.
  datatype Status = Present | Absent

  datatype Department = Department(name: string, code: string)

  datatype Subject = Subject(name: string, code: string, department: DepartmentId,
                             teacher: Option<UserId>, semester: int)

  datatype Student = Student(user: UserId, rollNumber: string, department: DepartmentId,
                             semester: int, joiningYear: int)

  datatype Session = Session(subject: SubjectId, date: Date, teacher: Option<UserId>)

  datatype Record = Record(session: SessionId, student: StudentId, status: Status)

  /** An auto-numbered table: `next` is the primary key the next insert receives. */
  datatype Table<T> = Table(rows: map<nat, T>, next: nat)
  {
    ghost predicate Valid() { forall k :: k in rows ==> k < next }

    /** Inserting stores the row under a key no existing row uses. */
    function Insert(row: T): (r: Table<T>)
      requires Valid()
      ensures r.Valid() && next !in rows
      ensures r.rows.Keys == rows.Keys + {next} && r.rows[next] == row
      ensures forall k :: k in rows ==> r.rows[k] == rows[k]
    {
      Table(rows[next := row], next + 1)
    }
  }

  /** The whole store at one moment. */
  datatype Tables = Tables(users: Table<User>, departments: Table<Department>,
                           subjects: Table<Subject>, students: Table<Student>,
                           sessions: Table<Session>, records: Table<Record>)

  function EmptyTables(): (t: Tables)
    ensures Valid(t)
    ensures t.users.rows == map[] && t.departments.rows == map[] && t.subjects.rows == map[]
    ensures t.students.rows == map[] && t.sessions.rows == map[] && t.records.rows == map[]
  {
    Tables(Table(map[], 0), Table(map[], 0), Table(map[], 0),
           Table(map[], 0), Table(map[], 0), Table(map[], 0))
  }

  ghost predicate KeysBelowNext(t: Tables)
  {
    t.users.Valid() && t.departments.Valid() && t.subjects.Valid() &&
    t.students.Valid() && t.sessions.Valid() && t.records.Valid()
  }

  ghost predicate OptionalUser(users: map<UserId, User>, u: Option<UserId>)
  {
    u.Some? ==> u.value in users
  }

  /** Every foreign key names an existing row (a nullable one may be null). */
  ghost predicate ReferencesResolve(t: Tables)
  {
    SubjectRefs(t) && StudentRefs(t) && SessionRefs(t) && RecordRefs(t)
  }

  ghost predicate SubjectRefs(t: Tables)
  {
    forall s :: s in t.subjects.rows ==>
      t.subjects.rows[s].department in t.departments.rows &&
      OptionalUser(t.users.rows, t.subjects.rows[s].teacher)
  }

  ghost predicate StudentRefs(t: Tables)
  {
    forall s :: s in t.students.rows ==>
      t.students.rows[s].user in t.users.rows &&
      t.students.rows[s].department in t.departments.rows
  }

  ghost predicate SessionRefs(t: Tables)
  {
    forall s :: s in t.sessions.rows ==>
      t.sessions.rows[s].subject in t.subjects.rows &&
      OptionalUser(t.users.rows, t.sessions.rows[s].teacher)
  }

  ghost predicate RecordRefs(t: Tables)
  {
    forall r :: r in t.records.rows ==>
      t.records.rows[r].session in t.sessions.rows &&
      t.records.rows[r].student in t.students.rows
  }

  /** unique_together = ('subject', 'date') */
  ghost predicate SessionsUnique(sessions: map<SessionId, Session>)
  {
    forall a, b | a in sessions && b in sessions &&
      sessions[a].subject == sessions[b].subject && sessions[a].date == sessions[b].date :: a == b
  }

  /** unique_together = ('session', 'student') */
  ghost predicate RecordsUnique(records: map<RecordId, Record>)
  {
    forall a, b | a in records && b in records &&
      records[a].session == records[b].session && records[a].student == records[b].student :: a == b
  }

  /** The unique columns and the one-to-one link from a profile to its user. */
  ghost predicate FieldsUnique(t: Tables)
  {
    && (forall a, b | a in t.users.rows && b in t.users.rows &&
          t.users.rows[a].username == t.users.rows[b].username :: a == b)
    && (forall a, b | a in t.departments.rows && b in t.departments.rows &&
          t.departments.rows[a].name == t.departments.rows[b].name :: a == b)
    && (forall a, b | a in t.departments.rows && b in t.departments.rows &&
          t.departments.rows[a].code == t.departments.rows[b].code :: a == b)
    && (forall a, b | a in t.subjects.rows && b in t.subjects.rows &&
          t.subjects.rows[a].code == t.subjects.rows[b].code :: a == b)
    && (forall a, b | a in t.students.rows && b in t.students.rows &&
          t.students.rows[a].rollNumber == t.students.rows[b].rollNumber :: a == b)
    && OneProfilePerUser(t.students.rows)
  }

  /** user = OneToOneField(...): no two profiles share a user. */
  ghost predicate OneProfilePerUser(students: map<StudentId, Student>)
  {
    forall a, b | a in students && b in students && students[a].user == students[b].user :: a == b
  }

  ghost predicate Valid(t: Tables)
  {
    KeysBelowNext(t) && ReferencesResolve(t) && FieldsUnique(t) &&
    SessionsUnique(t.sessions.rows) && RecordsUnique(t.records.rows)
  }

  // ---------------------------------------------------------------------
  // Attendance percentage
  // ---------------------------------------------------------------------

  /**
   * 100 * present / total as an exact rational, and 0 when there is
   * nothing to count.
   */
  function Percentage(present: nat, total: nat): (p: real)
    ensures total == 0 ==> p == 0.0
    ensures present <= total ==> 0.0 <= p <= 100.0
    ensures 0 < total && present <= total ==> (p == 100.0 <==> present == total)
    ensures 0 < total ==> (p == 0.0 <==> present == 0)
    ensures 0 < total ==> p * (total as real) == 100.0 * (present as real)
  {
    if total == 0 then 0.0 else 100.0 * (present as real) / (total as real)
  }

  /** The records of a student, restricted to one subject's sessions when a subject is given. */
  function StudentRecords(t: Tables, student: StudentId, subject: Option<SubjectId>): (rs: set<RecordId>)
    ensures forall r :: r in rs ==> r in t.records.rows && t.records.rows[r].student == student
    ensures subject.None? ==>
              forall r :: r in t.records.rows && t.records.rows[r].student == student ==> r in rs
    ensures subject.Some? ==>
              forall r :: r in t.records.rows && t.records.rows[r].student == student ==>
                (r in rs <==> t.records.rows[r].session in t.sessions.rows &&
                              t.sessions.rows[t.records.rows[r].session].subject == subject.value)
  {
    set r | r in t.records.rows && t.records.rows[r].student == student &&
            (subject.Some? ==> (t.records.rows[r].session in t.sessions.rows &&
                                t.sessions.rows[t.records.rows[r].session].subject == subject.value))
  }

  /** The records among `rs` whose status is Present. */
  function PresentRecords(records: map<RecordId, Record>, rs: set<RecordId>): (ps: set<RecordId>)
    ensures ps <= rs
    ensures forall r :: r in rs && r in records ==> (r in ps <==> records[r].status == Present)
  {
    set r | r in rs && r in records && records[r].status == Present
  }

  lemma SubsetCard<X>(a: set<X>, b: set<X>)
    requires a <= b
    ensures |a| <= |b|
    ensures |a| == |b| ==> a == b
  {
    assert b == a + (b - a);
    assert |b| == |a| + |b - a|;
  }

  /**
   * `get_attendance_percentage`: the Present share of the student's
   * records (filtered by subject when one is given), 0 when there are none.
   */
  function AttendancePercentage(t: Tables, student: StudentId, subject: Option<SubjectId>): (p: real)
    ensures 0.0 <= p <= 100.0
    ensures StudentRecords(t, student, subject) == {} ==> p == 0.0
    ensures StudentRecords(t, student, subject) != {} ==>
              (p == 100.0 <==> forall r :: r in StudentRecords(t, student, subject) ==>
                                  t.records.rows[r].status == Present)
    ensures p == 0.0 <==> forall r :: r in StudentRecords(t, student, subject) ==>
                            t.records.rows[r].status == Absent
  {
    var rs := StudentRecords(t, student, subject);
    var ps := PresentRecords(t.records.rows, rs);
    SubsetCard(ps, rs);
    assert ps == rs <==> forall r :: r in rs ==> t.records.rows[r].status == Present;
    assert ps == {} <==> forall r :: r in rs ==> t.records.rows[r].status == Absent;
    Percentage(|ps|, |rs|)
  }
}
