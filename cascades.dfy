/**
 * The on_delete rules of the schema, as functions from the store before a
 * delete to the store after it. A department takes its subjects and its
 * students with it (CASCADE); a subject takes its sessions; a session or a
 * student takes its records; a user takes its student profile; and the
 * teacher columns of subjects and sessions are set to null (SET_NULL).
 */
module Cascades {
  import opened Models

  /** Every row of `small` is a row of `big` under the same key. */
  ghost predicate RowsOf<T>(small: map<nat, T>, big: map<nat, T>)
  {
    forall k :: k in small ==> k in big && small[k] == big[k]
  }

  /** Deleting a subject removes it, its sessions, and their records. */
  function DeleteSubjectCascade(t: Tables, id: SubjectId): (r: Tables)
    ensures r.users == t.users && r.departments == t.departments && r.students == t.students
    ensures r.subjects.rows == t.subjects.rows - {id} && r.subjects.next == t.subjects.next
    ensures r.sessions.next == t.sessions.next && RowsOf(r.sessions.rows, t.sessions.rows)
    ensures forall s :: s in t.sessions.rows ==> (s in r.sessions.rows <==> t.sessions.rows[s].subject != id)
    ensures r.records.next == t.records.next && RowsOf(r.records.rows, t.records.rows)
    ensures forall k :: k in t.records.rows ==> (k in r.records.rows <==> t.records.rows[k].session in r.sessions.rows)
  {
    var sessions := map s | s in t.sessions.rows && t.sessions.rows[s].subject != id :: t.sessions.rows[s];
    var records := map k | k in t.records.rows && t.records.rows[k].session in sessions :: t.records.rows[k];
    t.(subjects := Table(t.subjects.rows - {id}, t.subjects.next),
       sessions := Table(sessions, t.sessions.next),
       records := Table(records, t.records.next))
  }

  /**
   * Deleting a department removes it, its subjects and its students, the
   * sessions of those subjects, and every record whose session or whose
   * student goes. Users are kept, including those of removed profiles.
   */
  function DeleteDepartmentCascade(t: Tables, id: DepartmentId): (r: Tables)
    ensures r.users == t.users
    ensures r.departments.rows == t.departments.rows - {id} && r.departments.next == t.departments.next
    ensures r.subjects.next == t.subjects.next && RowsOf(r.subjects.rows, t.subjects.rows)
    ensures forall s :: s in t.subjects.rows ==> (s in r.subjects.rows <==> t.subjects.rows[s].department != id)
    ensures r.students.next == t.students.next && RowsOf(r.students.rows, t.students.rows)
    ensures forall s :: s in t.students.rows ==> (s in r.students.rows <==> t.students.rows[s].department != id)
    ensures r.sessions.next == t.sessions.next && RowsOf(r.sessions.rows, t.sessions.rows)
    ensures forall s :: s in t.sessions.rows ==> (s in r.sessions.rows <==> t.sessions.rows[s].subject in r.subjects.rows)
    ensures r.records.next == t.records.next && RowsOf(r.records.rows, t.records.rows)
    ensures forall k :: k in t.records.rows ==>
              (k in r.records.rows <==>
                 t.records.rows[k].session in r.sessions.rows && t.records.rows[k].student in r.students.rows)
  {
    var subjects := map s | s in t.subjects.rows && t.subjects.rows[s].department != id :: t.subjects.rows[s];
    var students := map s | s in t.students.rows && t.students.rows[s].department != id :: t.students.rows[s];
    var sessions := map s | s in t.sessions.rows && t.sessions.rows[s].subject in subjects :: t.sessions.rows[s];
    var records := map k | k in t.records.rows && t.records.rows[k].session in sessions &&
                           t.records.rows[k].student in students :: t.records.rows[k];
    Tables(t.users, Table(t.departments.rows - {id}, t.departments.next),
           Table(subjects, t.subjects.next), Table(students, t.students.next),
           Table(sessions, t.sessions.next), Table(records, t.records.next))
  }

  /** A teacher reference after user `id` is deleted: null if it was `id`. */
  function Unassign(teacher: Option<UserId>, id: UserId): (r: Option<UserId>)
    ensures r == teacher || (teacher == Some(id) && r == None)
    ensures r != Some(id)
  {
    if teacher == Some(id) then None else teacher
  }

  /**
   * Deleting a user removes it, its student profile (if any) and that
   * profile's records, and clears the teacher column of the subjects and
   * sessions that named it. Nothing else changes.
   */
  function DeleteUserCascade(t: Tables, id: UserId): (r: Tables)
    ensures r.users.rows == t.users.rows - {id} && r.users.next == t.users.next
    ensures r.departments == t.departments
    ensures r.subjects.next == t.subjects.next && r.subjects.rows.Keys == t.subjects.rows.Keys
    ensures forall s :: s in t.subjects.rows ==>
              r.subjects.rows[s] == t.subjects.rows[s].(teacher := Unassign(t.subjects.rows[s].teacher, id))
    ensures r.sessions.next == t.sessions.next && r.sessions.rows.Keys == t.sessions.rows.Keys
    ensures forall s :: s in t.sessions.rows ==>
              r.sessions.rows[s] == t.sessions.rows[s].(teacher := Unassign(t.sessions.rows[s].teacher, id))
    ensures r.students.next == t.students.next && RowsOf(r.students.rows, t.students.rows)
    ensures forall s :: s in t.students.rows ==> (s in r.students.rows <==> t.students.rows[s].user != id)
    ensures r.records.next == t.records.next && RowsOf(r.records.rows, t.records.rows)
    ensures forall k :: k in t.records.rows ==> (k in r.records.rows <==> t.records.rows[k].student in r.students.rows)
  {
    var students := map s | s in t.students.rows && t.students.rows[s].user != id :: t.students.rows[s];
    var records := map k | k in t.records.rows && t.records.rows[k].student in students :: t.records.rows[k];
    Tables(Table(t.users.rows - {id}, t.users.next), t.departments,
           Table(UnassignSubjects(t.subjects.rows, id), t.subjects.next), Table(students, t.students.next),
           Table(UnassignSessions(t.sessions.rows, id), t.sessions.next), Table(records, t.records.next))
  }

  function UnassignSubjects(subjects: map<SubjectId, Subject>, id: UserId): (m: map<SubjectId, Subject>)
    ensures m.Keys == subjects.Keys
    ensures forall s :: s in subjects ==> m[s] == subjects[s].(teacher := Unassign(subjects[s].teacher, id))
  {
    map s | s in subjects :: subjects[s].(teacher := Unassign(subjects[s].teacher, id))
  }

  function UnassignSessions(sessions: map<SessionId, Session>, id: UserId): (m: map<SessionId, Session>)
    ensures m.Keys == sessions.Keys
    ensures forall s :: s in sessions ==> m[s] == sessions[s].(teacher := Unassign(sessions[s].teacher, id))
  {
    map s | s in sessions :: sessions[s].(teacher := Unassign(sessions[s].teacher, id))
  }

  // Each cascade keeps the store valid: the four parts of `Valid` are
  // proved one by one, which keeps each proof small.

  lemma DeleteSubjectKeepsValid(t: Tables, id: SubjectId)
    requires Valid(t)
    ensures Valid(DeleteSubjectCascade(t, id))
  {
    DeleteSubjectKeys(t, id);
    DeleteSubjectReferences(t, id);
    DeleteSubjectFields(t, id);
    DeleteSubjectPairs(t, id);
  }

  lemma DeleteSubjectKeys(t: Tables, id: SubjectId)
    requires Valid(t) ensures KeysBelowNext(DeleteSubjectCascade(t, id)) {}
  lemma DeleteSubjectReferences(t: Tables, id: SubjectId)
    requires ReferencesResolve(t) ensures ReferencesResolve(DeleteSubjectCascade(t, id))
  {
    var r := DeleteSubjectCascade(t, id);
    assert SubjectRefs(r);
    assert StudentRefs(r);
    assert SessionRefs(r);
    assert RecordRefs(r);
  }
  lemma DeleteSubjectFields(t: Tables, id: SubjectId)
    requires Valid(t) ensures FieldsUnique(DeleteSubjectCascade(t, id)) {}
  lemma DeleteSubjectPairs(t: Tables, id: SubjectId)
    requires Valid(t)
    ensures SessionsUnique(DeleteSubjectCascade(t, id).sessions.rows)
    ensures RecordsUnique(DeleteSubjectCascade(t, id).records.rows)
  {}

  lemma DeleteDepartmentKeepsValid(t: Tables, id: DepartmentId)
    requires Valid(t)
    ensures Valid(DeleteDepartmentCascade(t, id))
  {
    DeleteDepartmentKeys(t, id);
    DeleteDepartmentReferences(t, id);
    DeleteDepartmentFields(t, id);
    DeleteDepartmentPairs(t, id);
  }

  lemma DeleteDepartmentKeys(t: Tables, id: DepartmentId)
    requires Valid(t) ensures KeysBelowNext(DeleteDepartmentCascade(t, id)) {}
  lemma DeleteDepartmentReferences(t: Tables, id: DepartmentId)
    requires ReferencesResolve(t) ensures ReferencesResolve(DeleteDepartmentCascade(t, id))
  {
    var r := DeleteDepartmentCascade(t, id);
    assert SubjectRefs(r);
    assert StudentRefs(r);
    assert SessionRefs(r);
    assert RecordRefs(r);
  }
  lemma DeleteDepartmentFields(t: Tables, id: DepartmentId)
    requires Valid(t) ensures FieldsUnique(DeleteDepartmentCascade(t, id)) {}
  lemma DeleteDepartmentPairs(t: Tables, id: DepartmentId)
    requires Valid(t)
    ensures SessionsUnique(DeleteDepartmentCascade(t, id).sessions.rows)
    ensures RecordsUnique(DeleteDepartmentCascade(t, id).records.rows)
  {}

  lemma DeleteUserKeepsValid(t: Tables, id: UserId)
    requires Valid(t)
    ensures Valid(DeleteUserCascade(t, id))
  {
    DeleteUserKeys(t, id);
    DeleteUserReferences(t, id);
    DeleteUserFields(t, id);
    DeleteUserPairs(t, id);
  }

  lemma DeleteUserKeys(t: Tables, id: UserId)
    requires Valid(t) ensures KeysBelowNext(DeleteUserCascade(t, id)) {}
  lemma DeleteUserReferences(t: Tables, id: UserId)
    requires ReferencesResolve(t) ensures ReferencesResolve(DeleteUserCascade(t, id))
  {
    var r := DeleteUserCascade(t, id);
    forall s | s in r.subjects.rows
      ensures r.subjects.rows[s].department in r.departments.rows
      ensures OptionalUser(r.users.rows, r.subjects.rows[s].teacher)
    {
      assert r.subjects.rows[s] == t.subjects.rows[s].(teacher := Unassign(t.subjects.rows[s].teacher, id));
    }
    forall s | s in r.sessions.rows
      ensures r.sessions.rows[s].subject in r.subjects.rows
      ensures OptionalUser(r.users.rows, r.sessions.rows[s].teacher)
    {
      assert r.sessions.rows[s] == t.sessions.rows[s].(teacher := Unassign(t.sessions.rows[s].teacher, id));
    }
    assert SubjectRefs(r);
    assert SessionRefs(r);
    assert StudentRefs(r);
    assert RecordRefs(r);
  }

  lemma DeleteUserFields(t: Tables, id: UserId)
    requires Valid(t) ensures FieldsUnique(DeleteUserCascade(t, id)) {}
  lemma DeleteUserPairs(t: Tables, id: UserId)
    requires Valid(t)
    ensures SessionsUnique(DeleteUserCascade(t, id).sessions.rows)
    ensures RecordsUnique(DeleteUserCascade(t, id).records.rows)
  {}

  /**
   * Deleting a user that has no student profile (a teacher, say) only
   * nulls its teacher references: profiles and records stay as they were.
   */
  lemma DeleteTeacherKeepsRecords(t: Tables, id: UserId)
    requires RecordRefs(t)
    requires forall s :: s in t.students.rows ==> t.students.rows[s].user != id
    ensures DeleteUserCascade(t, id).students == t.students
    ensures DeleteUserCascade(t, id).records == t.records
    ensures DeleteUserCascade(t, id).departments == t.departments
  {
    var r := DeleteUserCascade(t, id);
    assert r.students.rows.Keys == t.students.rows.Keys;
    assert r.students.rows == t.students.rows;
    assert r.records.rows.Keys == t.records.rows.Keys;
    assert r.records.rows == t.records.rows;
  }

  /** After deleting user `id`, no row of the store refers to it any more. */
  lemma DeletedUserUnreferenced(t: Tables, id: UserId)
    requires Valid(t)
    ensures var r := DeleteUserCascade(t, id);
      id !in r.users.rows &&
      (forall s :: s in r.subjects.rows ==> r.subjects.rows[s].teacher != Some(id)) &&
      (forall s :: s in r.sessions.rows ==> r.sessions.rows[s].teacher != Some(id)) &&
      (forall s :: s in r.students.rows ==> r.students.rows[s].user != id)
  {
  }
}
