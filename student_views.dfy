/**
 * The two pages a student sees: the dashboard, which totals the student's
 * records subject by subject over the subjects of the student's
 * department and semester, and the detail page of one subject.
 */
module StudentViews {
  import opened Models
  import opened Access
  import opened Marking

  /** request.user.student_profile: the profile whose user is `user`, if any. */
  function ProfileOf(students: map<StudentId, Student>, user: UserId): (r: Option<StudentId>)
    requires OneProfilePerUser(students)
    ensures r.Some? ==> r.value in students && students[r.value].user == user
    ensures r.None? ==> forall s :: s in students ==> students[s].user != user
  {
    if exists s :: s in students && students[s].user == user then
      var s :| s in students && students[s].user == user;
      Some(s)
    else
      None
  }

  /** One line of the dashboard table. */
  datatype SubjectRow = SubjectRow(subject: SubjectId, total: nat, present: nat, absent: int, percentage: real)

  /** The line the dashboard shows for `subject`: counts of the student's records in it. */
  function SubjectRowOf(t: Tables, student: StudentId, subject: SubjectId): (row: SubjectRow)
    ensures row.subject == subject
    ensures row.total == |StudentRecords(t, student, Some(subject))|
    ensures row.present == |PresentRecords(t.records.rows, StudentRecords(t, student, Some(subject)))|
    ensures 0 <= row.absent == row.total - row.present
    ensures 0.0 <= row.percentage <= 100.0 && row.percentage == Percentage(row.present, row.total)
  {
    var records := StudentRecords(t, student, Some(subject));
    var present := PresentRecords(t.records.rows, records);
    SubsetCard(present, records);
    SubjectRow(subject, |records|, |present|, |records| - |present|, Percentage(|present|, |records|))
  }

  /** The present counts of the lines added up; never more than their totals when no line has more present than total. */
  function SumPresent(rows: seq<SubjectRow>): (n: nat)
    ensures (forall i :: 0 <= i < |rows| ==> rows[i].present <= rows[i].total) ==> n <= SumTotal(rows)
  {
    if rows == [] then 0 else SumPresent(rows[..|rows| - 1]) + rows[|rows| - 1].present
  }

  /** The totals of the lines added up. */
  function SumTotal(rows: seq<SubjectRow>): (n: nat)
  {
    if rows == [] then 0 else SumTotal(rows[..|rows| - 1]) + rows[|rows| - 1].total
  }

  lemma SumsAppend(rows: seq<SubjectRow>, row: SubjectRow)
    ensures SumPresent(rows + [row]) == SumPresent(rows) + row.present
    ensures SumTotal(rows + [row]) == SumTotal(rows) + row.total
  {
    assert (rows + [row])[..|rows|] == rows;
  }

  /** The student's records whose session belongs to one of `subjects`. */
  function RecordsIn(t: Tables, student: StudentId, subjects: set<SubjectId>): (rs: set<RecordId>)
    ensures forall r :: r in rs ==> r in t.records.rows && t.records.rows[r].student == student
  {
    set r | r in t.records.rows && t.records.rows[r].student == student &&
            t.records.rows[r].session in t.sessions.rows &&
            t.sessions.rows[t.records.rows[r].session].subject in subjects
  }

  /** The student's records whose session belongs to a subject listed in `subjects`. */
  function RecordsAmong(t: Tables, student: StudentId, subjects: seq<SubjectId>): (rs: set<RecordId>)
    ensures forall r :: r in rs ==> r in t.records.rows && t.records.rows[r].student == student
  {
    RecordsIn(t, student, set x | x in subjects)
  }

  /** A list and a set with the same members select the same records. */
  lemma RecordsAmongSet(t: Tables, student: StudentId, subjects: seq<SubjectId>, s: set<SubjectId>)
    requires forall x :: x in subjects <==> x in s
    ensures RecordsAmong(t, student, subjects) == RecordsIn(t, student, s)
  {
  }

  /**
   * Counting one more subject, not yet listed, adds exactly that subject's
   * records, to the total and to the present count.
   */
  lemma AddSubject(t: Tables, student: StudentId, done: seq<SubjectId>, subject: SubjectId)
    requires subject !in done
    ensures var before := RecordsAmong(t, student, done);
      var now := RecordsAmong(t, student, done + [subject]);
      var one := StudentRecords(t, student, Some(subject));
      && |now| == |before| + |one|
      && |PresentRecords(t.records.rows, now)| ==
           |PresentRecords(t.records.rows, before)| + |PresentRecords(t.records.rows, one)|
  {
    var before := RecordsAmong(t, student, done);
    var now := RecordsAmong(t, student, done + [subject]);
    var one := StudentRecords(t, student, Some(subject));
    assert now == before + one;
    assert before * one == {};
    var pb, pn, po := PresentRecords(t.records.rows, before), PresentRecords(t.records.rows, now),
                      PresentRecords(t.records.rows, one);
    assert pn == pb + po;
    assert pb * po == {};
  }

  /**
   * Subject.objects.filter(department, semester): each subject of the
   * student's department and semester, once, in some order.
   */
  method ListSubjects(subjects: map<SubjectId, Subject>, student: Student) returns (xs: seq<SubjectId>)
    ensures forall s :: s in xs <==> s in SubjectsOf(subjects, student)
    ensures forall i, j :: 0 <= i < j < |xs| ==> xs[i] != xs[j]
  {
    var todo := SubjectsOf(subjects, student);
    xs := [];
    while todo != {}
      invariant todo <= SubjectsOf(subjects, student)
      invariant forall s :: s in xs <==> s in SubjectsOf(subjects, student) && s !in todo
      invariant forall i, j :: 0 <= i < j < |xs| ==> xs[i] != xs[j]
      decreases |todo|
    {
      var s :| s in todo;
      xs := xs + [s];
      todo := todo - {s};
    }
  }

  /**
   * The loop of `student_dashboard`: for each listed subject in turn, its
   * line, with the overall counts accumulated along the way.
   */
  method Tabulate(t: Tables, student: StudentId, subjects: seq<SubjectId>)
    returns (rows: seq<SubjectRow>, overallPresent: nat, overallTotal: nat)
    requires forall i, j :: 0 <= i < j < |subjects| ==> subjects[i] != subjects[j]
    ensures |rows| == |subjects|
    ensures forall i :: 0 <= i < |rows| ==> rows[i] == SubjectRowOf(t, student, subjects[i])
    ensures overallPresent == SumPresent(rows) && overallTotal == SumTotal(rows)
    ensures overallTotal == |RecordsAmong(t, student, subjects)|
    ensures overallPresent == |PresentRecords(t.records.rows, RecordsAmong(t, student, subjects))|
  {
    rows, overallPresent, overallTotal := [], 0, 0;
    assert RecordsAmong(t, student, []) == {};
    for k := 0 to |subjects|
      invariant |rows| == k
      invariant forall i :: 0 <= i < k ==> rows[i] == SubjectRowOf(t, student, subjects[i])
      invariant overallPresent == SumPresent(rows) && overallTotal == SumTotal(rows)
      invariant overallTotal == |RecordsAmong(t, student, subjects[..k])|
      invariant overallPresent == |PresentRecords(t.records.rows, RecordsAmong(t, student, subjects[..k]))|
    {
      var row := SubjectRowOf(t, student, subjects[k]);
      assert subjects[..k + 1] == subjects[..k] + [subjects[k]];
      AddSubject(t, student, subjects[..k], subjects[k]);
      SumsAppend(rows, row);
      overallPresent := overallPresent + row.present;
      overallTotal := overallTotal + row.total;
      rows := rows + [row];
    }
    assert subjects[..|subjects|] == subjects;
  }

  datatype StudentDashboardPage =
    | DashboardDenied              // the student gate redirected to login
    | NoProfile                    // the user has no student profile: back to login
    | Summary(student: StudentId, rows: seq<SubjectRow>, overallPresent: nat, overallAbsent: int,
              overallTotal: nat, overallPercentage: real)

  /**
   * `student_dashboard`: one row per subject of the student's department
   * and semester (in no particular order), and overall figures that are
   * the sums of the rows and equal the counts over all the student's
   * records in those subjects.
   */
  method StudentDashboard(t: Tables, requester: Option<UserId>) returns (page: StudentDashboardPage)
    requires OneProfilePerUser(t.students.rows)
    ensures page.DashboardDenied? <==> StudentRequired(PrincipalOf(t.users.rows, requester)) != Granted
    ensures page.NoProfile? <==>
              StudentRequired(PrincipalOf(t.users.rows, requester)) == Granted &&
              ProfileOf(t.students.rows, requester.value).None?
    ensures page.Summary? ==> requester.Some? && ProfileOf(t.students.rows, requester.value) == Some(page.student)
    ensures page.Summary? ==>
              var subjects := SubjectsOf(t.subjects.rows, t.students.rows[page.student]);
              && (forall i :: 0 <= i < |page.rows| ==> page.rows[i] == SubjectRowOf(t, page.student, page.rows[i].subject))
              && (forall s :: s in subjects <==> exists i :: 0 <= i < |page.rows| && page.rows[i].subject == s)
              && (forall i, j :: 0 <= i < j < |page.rows| ==> page.rows[i].subject != page.rows[j].subject)
              && page.overallPresent == SumPresent(page.rows)
              && page.overallTotal == SumTotal(page.rows)
              && page.overallTotal == |RecordsIn(t, page.student, subjects)|
              && page.overallPresent == |PresentRecords(t.records.rows, RecordsIn(t, page.student, subjects))|
    ensures page.Summary? ==>
              && page.overallPresent <= page.overallTotal
              && page.overallAbsent == page.overallTotal - page.overallPresent
              && page.overallPercentage == Percentage(page.overallPresent, page.overallTotal)
  {
    if StudentRequired(PrincipalOf(t.users.rows, requester)) != Granted {
      return DashboardDenied;
    }
    var profile := ProfileOf(t.students.rows, requester.value);
    if profile.None? {
      return NoProfile;
    }
    var student := profile.value;
    var subjects := SubjectsOf(t.subjects.rows, t.students.rows[student]);
    var listed := ListSubjects(t.subjects.rows, t.students.rows[student]);
    var rows, overallPresent, overallTotal := Tabulate(t, student, listed);
    RecordsAmongSet(t, student, listed, subjects);
    forall s | s in subjects
      ensures exists i :: 0 <= i < |rows| && rows[i].subject == s
    {
      var i :| 0 <= i < |listed| && listed[i] == s;
      assert rows[i].subject == s;
    }
    SubsetCard(PresentRecords(t.records.rows, RecordsIn(t, student, subjects)), RecordsIn(t, student, subjects));
    page := Summary(student, rows, overallPresent, overallTotal - overallPresent, overallTotal,
                    Percentage(overallPresent, overallTotal));
  }

  /** A dashboard line shows the same percentage as the profile's own per-subject figure. */
  lemma LineMatchesProfilePercentage(t: Tables, student: StudentId, subject: SubjectId)
    ensures SubjectRowOf(t, student, subject).percentage == AttendancePercentage(t, student, Some(subject))
  {
  }

  /**
   * When every record of the student lies in a subject of the student's
   * department and semester, the dashboard's overall figure is the
   * profile's overall attendance percentage; otherwise the two may differ,
   * since the dashboard counts only those subjects.
   */
  lemma OverallMatchesProfilePercentage(t: Tables, student: StudentId, overallPresent: nat, overallTotal: nat)
    requires student in t.students.rows && RecordRefs(t)
    requires forall r :: r in t.records.rows && t.records.rows[r].student == student ==>
               t.sessions.rows[t.records.rows[r].session].subject in SubjectsOf(t.subjects.rows, t.students.rows[student])
    requires overallTotal == |RecordsIn(t, student, SubjectsOf(t.subjects.rows, t.students.rows[student]))|
    requires overallPresent ==
               |PresentRecords(t.records.rows, RecordsIn(t, student, SubjectsOf(t.subjects.rows, t.students.rows[student])))|
    ensures Percentage(overallPresent, overallTotal) == AttendancePercentage(t, student, None)
  {
    var subjects := SubjectsOf(t.subjects.rows, t.students.rows[student]);
    assert RecordsIn(t, student, subjects) == StudentRecords(t, student, None);
  }

  datatype DetailPage =
    | DetailDenied                 // the student gate redirected to login
    | DetailNoProfile              // the user has no student profile: back to login
    | SubjectNotFound              // no subject has this id
    | Detail(records: set<RecordId>, total: nat, present: nat, absent: int, percentage: real)

  /**
   * `student_attendance_detail`: the student's records in one subject
   * (any subject, not only those of the student's semester) and their counts.
   */
  function StudentAttendanceDetail(t: Tables, requester: Option<UserId>, subject: SubjectId): (page: DetailPage)
    requires OneProfilePerUser(t.students.rows) && RecordRefs(t)
    ensures page.DetailDenied? <==> StudentRequired(PrincipalOf(t.users.rows, requester)) != Granted
    ensures page.DetailNoProfile? <==>
              StudentRequired(PrincipalOf(t.users.rows, requester)) == Granted &&
              ProfileOf(t.students.rows, requester.value).None?
    ensures page.SubjectNotFound? <==>
              StudentRequired(PrincipalOf(t.users.rows, requester)) == Granted &&
              ProfileOf(t.students.rows, requester.value).Some? && subject !in t.subjects.rows
    ensures page.Detail? ==> requester.Some? && ProfileOf(t.students.rows, requester.value).Some?
    ensures page.Detail? ==>
              var student := ProfileOf(t.students.rows, requester.value).value;
              && (forall r :: r in page.records <==>
                    r in t.records.rows && t.records.rows[r].student == student &&
                    t.sessions.rows[t.records.rows[r].session].subject == subject)
              && page.total == |page.records|
              && page.present == |PresentRecords(t.records.rows, page.records)|
              && 0 <= page.absent == page.total - page.present
              && page.percentage == AttendancePercentage(t, student, Some(subject))
  {
    if StudentRequired(PrincipalOf(t.users.rows, requester)) != Granted then DetailDenied
    else match ProfileOf(t.students.rows, requester.value)
      case None => DetailNoProfile
      case Some(student) =>
        if subject !in t.subjects.rows then SubjectNotFound
        else
          var records := StudentRecords(t, student, Some(subject));
          var present := PresentRecords(t.records.rows, records);
          SubsetCard(present, records);
          Detail(records, |records|, |present|, |records| - |present|, Percentage(|present|, |records|))
  }
}
