/**
 * The two object-relational calls the attendance form relies on, on the
 * session and record tables: get-or-create of the session keyed by
 * (subject, date), and update-or-create of the record keyed by
 * (session, student), together with the loop of update-or-creates that
 * one submission performs.
 */
module Orm {
  import opened Models

  // ---------------------------------------------------------------------
  // Sessions
  // ---------------------------------------------------------------------

  /** The session stored for (subject, date), if there is one. */
  function FindSession(sessions: map<SessionId, Session>, subject: SubjectId, date: Date): (r: Option<SessionId>)
    requires SessionsUnique(sessions)
    ensures r.Some? ==> r.value in sessions && sessions[r.value].subject == subject && sessions[r.value].date == date
    ensures r.None? ==> forall k :: k in sessions ==> !(sessions[k].subject == subject && sessions[k].date == date)
  {
    if exists k :: k in sessions && sessions[k].subject == subject && sessions[k].date == date then
      var k :| k in sessions && sessions[k].subject == subject && sessions[k].date == date;
      Some(k)
    else
      None
  }

  datatype SessionLookup = SessionLookup(sessions: Table<Session>, id: SessionId, created: bool)

  /**
   * get_or_create(subject, date, defaults = {teacher}): the defaults are
   * used only when a new row is created, so an existing session keeps the
   * teacher it was created with.
   */
  function GetOrCreateSession(sessions: Table<Session>, subject: SubjectId, date: Date, teacher: UserId): (r: SessionLookup)
    requires sessions.Valid() && SessionsUnique(sessions.rows)
    ensures r.sessions.Valid() && SessionsUnique(r.sessions.rows)
    ensures r.id in r.sessions.rows && r.sessions.rows[r.id].subject == subject && r.sessions.rows[r.id].date == date
    ensures !r.created <==> exists k :: k in sessions.rows && sessions.rows[k].subject == subject && sessions.rows[k].date == date
    ensures !r.created ==> r.sessions == sessions
    ensures r.created ==> r.id !in sessions.rows && r.sessions.rows == sessions.rows[r.id := Session(subject, date, Some(teacher))]
    ensures sessions.next <= r.sessions.next
  {
    match FindSession(sessions.rows, subject, date)
    case Some(k) => SessionLookup(sessions, k, false)
    case None => SessionLookup(sessions.Insert(Session(subject, date, Some(teacher))), sessions.next, true)
  }

  /** Exactly one session carries (subject, date) once get-or-create has run. */
  lemma GetOrCreateSessionUnique(sessions: Table<Session>, subject: SubjectId, date: Date, teacher: UserId, k: SessionId)
    requires sessions.Valid() && SessionsUnique(sessions.rows)
    requires k in GetOrCreateSession(sessions, subject, date, teacher).sessions.rows
    requires GetOrCreateSession(sessions, subject, date, teacher).sessions.rows[k].subject == subject
    requires GetOrCreateSession(sessions, subject, date, teacher).sessions.rows[k].date == date
    ensures k == GetOrCreateSession(sessions, subject, date, teacher).id
  {
  }

  // ---------------------------------------------------------------------
  // Records
  // ---------------------------------------------------------------------

  /** The record stored for (session, student), if there is one. */
  function FindRecord(records: map<RecordId, Record>, session: SessionId, student: StudentId): (r: Option<RecordId>)
    requires RecordsUnique(records)
    ensures r.Some? ==> r.value in records && records[r.value].session == session && records[r.value].student == student
    ensures r.None? ==> forall k :: k in records ==> !(records[k].session == session && records[k].student == student)
  {
    if exists k :: k in records && records[k].session == session && records[k].student == student then
      var k :| k in records && records[k].session == session && records[k].student == student;
      Some(k)
    else
      None
  }

  /**
   * The record table `after` differs from `before` only in records of
   * `session` for students in `students`: every old row keeps its key,
   * session and student, rows outside that slice are untouched, and every
   * new row belongs to that slice.
   */
  ghost predicate Frame(before: map<RecordId, Record>, after: map<RecordId, Record>,
                        session: SessionId, students: seq<StudentId>)
  {
    && (forall k :: k in before ==>
          k in after && after[k].session == before[k].session && after[k].student == before[k].student)
    && (forall k :: k in before && (before[k].session != session || before[k].student !in students) ==>
          after[k] == before[k])
    && (forall k :: k in after && k !in before ==>
          after[k].session == session && after[k].student in students)
  }

  /** update_or_create(session, student, defaults = {status}). */
  function UpdateOrCreate(records: Table<Record>, session: SessionId, student: StudentId, status: Status): (r: Table<Record>)
    requires records.Valid() && RecordsUnique(records.rows)
    ensures r.Valid() && RecordsUnique(r.rows) && records.next <= r.next
  {
    match FindRecord(records.rows, session, student)
    case Some(k) => Table(records.rows[k := Record(session, student, status)], records.next)
    case None => records.Insert(Record(session, student, status))
  }

  /**
   * After update_or_create the pair (session, student) has a record with
   * the given status, and no other record has changed.
   */
  lemma UpdateOrCreateEffect(records: Table<Record>, session: SessionId, student: StudentId, status: Status)
    requires records.Valid() && RecordsUnique(records.rows)
    ensures var r := UpdateOrCreate(records, session, student, status);
      && (exists k :: k in r.rows && r.rows[k] == Record(session, student, status))
      && Frame(records.rows, r.rows, session, [student])
  {
    var r := UpdateOrCreate(records, session, student, status);
    match FindRecord(records.rows, session, student)
    case Some(k) =>
      assert r.rows[k] == Record(session, student, status);
    case None =>
      assert r.rows[records.next] == Record(session, student, status);
  }

  // ---------------------------------------------------------------------
  // One submission
  // ---------------------------------------------------------------------

  /** The status a submitted student receives: Present iff listed as present. */
  function StatusFor(student: StudentId, present: seq<StudentId>): (s: Status)
    ensures s == Present <==> student in present
  {
    if student in present then Present else Absent
  }

  /** The update-or-create of each id of `ids` in turn, first to last. */
  function MarkAll(records: Table<Record>, session: SessionId, ids: seq<StudentId>, present: seq<StudentId>): (r: Table<Record>)
    requires records.Valid() && RecordsUnique(records.rows)
    ensures r.Valid() && RecordsUnique(r.rows) && records.next <= r.next
    decreases |ids|
  {
    if ids == [] then records
    else
      var last := ids[|ids| - 1];
      UpdateOrCreate(MarkAll(records, session, ids[..|ids| - 1], present), session, last, StatusFor(last, present))
  }

  /** Processing one more id of a list upserts exactly that id. */
  lemma MarkAllStep(records: Table<Record>, session: SessionId, ids: seq<StudentId>, present: seq<StudentId>, i: nat)
    requires records.Valid() && RecordsUnique(records.rows)
    requires i < |ids|
    ensures MarkAll(records, session, ids[..i + 1], present) ==
              UpdateOrCreate(MarkAll(records, session, ids[..i], present), session, ids[i], StatusFor(ids[i], present))
  {
    assert ids[..i + 1][..i] == ids[..i];
  }

  /** Every id of `ids` has a record in `session` whose status follows `present`. */
  ghost predicate MarkedAs(records: map<RecordId, Record>, session: SessionId,
                         ids: seq<StudentId>, present: seq<StudentId>)
  {
    forall st :: st in ids ==>
      exists k :: k in records && records[k] == Record(session, st, StatusFor(st, present))
  }

  lemma {:induction false} MarkAllMarks(records: Table<Record>, session: SessionId, ids: seq<StudentId>, present: seq<StudentId>)
    requires records.Valid() && RecordsUnique(records.rows)
    ensures MarkedAs(MarkAll(records, session, ids, present).rows, session, ids, present)
    decreases |ids|
  {
    if ids != [] {
      var init, last := ids[..|ids| - 1], ids[|ids| - 1];
      assert ids == init + [last];
      var before := MarkAll(records, session, init, present);
      var after := MarkAll(records, session, ids, present);
      assert after == UpdateOrCreate(before, session, last, StatusFor(last, present));
      UpdateOrCreateEffect(before, session, last, StatusFor(last, present));
      MarkAllMarks(records, session, init, present);
      forall st | st in ids
        ensures exists k :: k in after.rows && after.rows[k] == Record(session, st, StatusFor(st, present))
      {
        if st != last {
          assert st in init;
          var k :| k in before.rows && before.rows[k] == Record(session, st, StatusFor(st, present));
          assert after.rows[k] == before.rows[k];
        }
      }
    }
  }

  /** A listed id ends up with exactly one record in the session, carrying its status. */
  lemma MarkAllRecordsOnce(records: Table<Record>, session: SessionId, ids: seq<StudentId>,
                           present: seq<StudentId>, student: StudentId)
    requires records.Valid() && RecordsUnique(records.rows)
    requires student in ids
    ensures exists k :: RecordOnce(MarkAll(records, session, ids, present).rows, k, session, student, StatusFor(student, present))
  {
    MarkAllMarks(records, session, ids, present);
    var m := MarkAll(records, session, ids, present).rows;
    var k :| k in m && m[k] == Record(session, student, StatusFor(student, present));
    assert RecordOnce(m, k, session, student, StatusFor(student, present));
  }

  /** `k` is the one record of (session, student), and it has `status`. */
  ghost predicate RecordOnce(m: map<RecordId, Record>, k: RecordId, session: SessionId, student: StudentId, status: Status)
  {
    && k in m && m[k] == Record(session, student, status)
    && forall j | j in m && m[j].session == session && m[j].student == student :: j == k
  }

  lemma FrameGrow(a: map<RecordId, Record>, b: map<RecordId, Record>, c: map<RecordId, Record>,
                  session: SessionId, init: seq<StudentId>, last: StudentId)
    requires Frame(a, b, session, init)
    requires Frame(b, c, session, [last])
    ensures Frame(a, c, session, init + [last])
  {
    var ids := init + [last];
    forall k | k in a && (a[k].session != session || a[k].student !in ids)
      ensures c[k] == a[k]
    {
      assert (a[k].student !in init && a[k].student != last) || a[k].session != session;
    }
    forall k | k in c && k !in a
      ensures c[k].session == session && c[k].student in ids
    {
      if k in b {
        assert c[k].student == b[k].student;
      }
    }
  }

  lemma {:induction false} MarkAllFrame(records: Table<Record>, session: SessionId, ids: seq<StudentId>, present: seq<StudentId>)
    requires records.Valid() && RecordsUnique(records.rows)
    ensures Frame(records.rows, MarkAll(records, session, ids, present).rows, session, ids)
    decreases |ids|
  {
    if ids != [] {
      var init, last := ids[..|ids| - 1], ids[|ids| - 1];
      assert ids == init + [last];
      MarkAllFrame(records, session, init, present);
      UpdateOrCreateEffect(MarkAll(records, session, init, present), session, last, StatusFor(last, present));
      FrameGrow(records.rows, MarkAll(records, session, init, present).rows,
                MarkAll(records, session, ids, present).rows, session, init, last);
    }
  }

  /**
   * The index of the first id naming no student, or |ids| when all exist:
   * the point at which a submission aborts.
   */
  function FirstUnknown(students: map<StudentId, Student>, ids: seq<StudentId>): (n: nat)
    ensures n <= |ids|
    ensures forall j :: 0 <= j < n ==> ids[j] in students
    ensures n < |ids| ==> ids[n] !in students
  {
    if ids == [] || ids[0] !in students then 0 else 1 + FirstUnknown(students, ids[1..])
  }

  /**
   * The loop of `mark_attendance`: each submitted id in turn is
   * upserted into `session`, Present iff it is among the present ids,
   * until an id names no student. Returns the record table and how many
   * ids were processed.
   */
  method UpsertAll(records: Table<Record>, students: map<StudentId, Student>, session: SessionId,
                   ids: seq<StudentId>, present: seq<StudentId>) returns (upserted: Table<Record>, n: nat)
    requires records.Valid() && RecordsUnique(records.rows)
    ensures n == FirstUnknown(students, ids)
    ensures upserted == MarkAll(records, session, ids[..n], present)
  {
    upserted, n := records, 0;
    while n < |ids| && ids[n] in students
      invariant n <= FirstUnknown(students, ids)
      invariant upserted == MarkAll(records, session, ids[..n], present)
      decreases |ids| - n
    {
      MarkAllStep(records, session, ids, present, n);
      upserted := UpdateOrCreate(upserted, session, ids[n], StatusFor(ids[n], present));
      n := n + 1;
    }
  }
}
